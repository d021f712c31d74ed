/**
  The memoised branch-and-bound search of the museum zone optimizer
  (`museum_solver/src/lib.rs`, `solve`, `solve_inner`).

  `Search` is what `solve_inner` computes for a state, written as the same
  left-to-right pass over the member combinations, with the same early skip
  and the same strict-improvement test. A `Plan` is an independent view of
  the choices the search can make: one combination for the current zone and,
  when `can_next` holds, a plan for the state that follows. The lemmas show
  that the search finds the cheapest plan and that what it returns is a plan.
 */
module MuseumSolver {
  import opened Wrappers
  import opened Itertools
  import opened MuseumCost
  import opened MuseumState

  /** `HashMap<Zone, Vec<MemberInfo>>`: the members put into each zone. */
  type Mapping = map<Zone, seq<Member>>

  /** `SolveResult`: the total cost and the mapping that achieves it. */
  datatype SolveResult = SolveResult(cost: CalcResult, mapping: Mapping)

  const U64Max: nat := 0xFFFF_FFFF_FFFF_FFFF

  /** The starting value of `min_result`: `(u64::MAX, u64::MAX)` and no mapping. */
  const Unsolved := SolveResult(CalcResult(U64Max, U64Max), map[])

  predicate AllTriples(cs: seq<seq<Member>>)
  {
    forall i :: 0 <= i < |cs| ==> |cs[i]| == 3
  }

  // ---------------------------------------------------------------------
  // What `solve_inner` computes.
  // ---------------------------------------------------------------------

  /** The result of `solve_inner(s, cache)` with a cache that holds only correct entries. */
  function Search(s: State): SolveResult
    requires s.zones != []
    decreases |s.zones|, 2, 0
  {
    Best(s, MemberCombinations(s))
  }

  /** `min_result` after the loop has seen the combinations `cs`. */
  function Best(s: State, cs: seq<seq<Member>>): SolveResult
    requires s.zones != [] && AllTriples(cs)
    decreases |s.zones|, 1, |cs|
  {
    if cs == [] then Unsolved
    else Step(s, Best(s, cs[..|cs| - 1]), cs[|cs| - 1])
  }

  /**
    One turn of the loop: skip `c` when its own zone cost is already no
    better than `best`, otherwise cost the branch and keep it if it is
    strictly better.
   */
  function Step(s: State, best: SolveResult, c: seq<Member>): SolveResult
    requires s.zones != [] && |c| == 3
    decreases |s.zones|, 0, 1
  {
    if LessEq(best.cost, ZoneCost(CurrentZone(s), c)) then best
    else
      var b := Branch(s, c);
      if Less(b.cost, best.cost) then b else best
  }

  /**
    The branch that puts `c` into the current zone: its zone cost plus, when
    `can_next` holds, the best result of the next state, whose mapping it
    extends with the current zone.
   */
  function Branch(s: State, c: seq<Member>): SolveResult
    requires s.zones != [] && |c| == 3
    decreases |s.zones|, 0, 0
  {
    var here := ZoneCost(CurrentZone(s), c);
    if CanNext(s) then
      var child := Search(Next(s, c));
      SolveResult(here.Add(child.cost), child.mapping[CurrentZone(s) := c])
    else
      SolveResult(here, map[CurrentZone(s) := c])
  }

  /**
    The early `continue` never changes the outcome: a branch whose zone cost
    alone is no better than `best` cannot be strictly better once the next
    state's cost, which is never negative, is added.
   */
  lemma SkipIsHarmless(s: State, best: SolveResult, c: seq<Member>)
    requires s.zones != [] && |c| == 3
    ensures Step(s, best, c) == if Less(Branch(s, c).cost, best.cost) then Branch(s, c) else best
  {
    var here := ZoneCost(CurrentZone(s), c);
    if CanNext(s) {
      AddIsMonotone(here, Search(Next(s, c)).cost, NoCost);
    }
    if LessEq(best.cost, here) {
      CostOrderIsTotal(best.cost, here, Branch(s, c).cost);
    }
  }

  // ---------------------------------------------------------------------
  // Facts about the pass over the combinations.
  // ---------------------------------------------------------------------

  /** After the pass, `min_result` is no worse than the sentinel and than every branch seen. */
  lemma {:induction false} BestIsLeast(s: State, cs: seq<seq<Member>>)
    requires s.zones != [] && AllTriples(cs)
    ensures LessEq(Best(s, cs).cost, Unsolved.cost)
    ensures forall i :: 0 <= i < |cs| ==> LessEq(Best(s, cs).cost, Branch(s, cs[i]).cost)
    decreases |cs|
  {
    if cs != [] {
      var init, c := cs[..|cs| - 1], cs[|cs| - 1];
      BestIsLeast(s, init);
      var prev := Best(s, init);
      SkipIsHarmless(s, prev, c);
      var now := Best(s, cs);
      assert now == prev || (now == Branch(s, c) && Less(now.cost, prev.cost));
      CostOrderIsTotal(now.cost, prev.cost, Unsolved.cost);
      CostOrderIsTotal(now.cost, prev.cost, Branch(s, c).cost);
      forall i | 0 <= i < |cs| ensures LessEq(now.cost, Branch(s, cs[i]).cost) {
        if i < |cs| - 1 {
          assert cs[i] == init[i];
          CostOrderIsTotal(now.cost, prev.cost, Branch(s, cs[i]).cost);
        }
      }
    }
  }

  /**
    After the pass, `min_result` is either still the sentinel, or the branch
    of one of the combinations seen and strictly cheaper than the sentinel.
   */
  lemma {:induction false} BestIsBranch(s: State, cs: seq<seq<Member>>) returns (i: int)
    requires s.zones != [] && AllTriples(cs)
    ensures i < 0 ==> Best(s, cs) == Unsolved
    ensures i >= 0 ==> i < |cs| && Best(s, cs) == Branch(s, cs[i]) && Less(Best(s, cs).cost, Unsolved.cost)
    decreases |cs|
  {
    if cs == [] {
      i := -1;
    } else {
      var init, c := cs[..|cs| - 1], cs[|cs| - 1];
      var j := BestIsBranch(s, init);
      var prev := Best(s, init);
      SkipIsHarmless(s, prev, c);
      if Best(s, cs) == prev {
        i := j;
        if j >= 0 {
          assert cs[j] == init[j];
        }
      } else {
        i := |cs| - 1;
        BestIsLeast(s, init);
        CostOrderIsTotal(Branch(s, c).cost, prev.cost, Unsolved.cost);
      }
    }
  }

  // ---------------------------------------------------------------------
  // Plans: the choices the search can make, and what each one costs.
  // ---------------------------------------------------------------------

  /**
    A plan for `s`: a combination of the free members for the current zone,
    followed by a plan for the next state when `can_next` holds, and by
    nothing otherwise.
   */
  predicate IsPlan(s: State, p: seq<seq<Member>>)
    requires s.zones != []
    decreases |s.zones|
  {
    |p| >= 1 && p[0] in MemberCombinations(s) &&
    if CanNext(s) then IsPlan(Next(s, p[0]), p[1..]) else |p| == 1
  }

  /** The cost of a plan: the zone cost of each combination, added up. */
  function PlanCost(s: State, p: seq<seq<Member>>): CalcResult
    requires s.zones != [] && IsPlan(s, p)
    decreases |s.zones|
  {
    var here := ZoneCost(CurrentZone(s), p[0]);
    if CanNext(s) then here.Add(PlanCost(Next(s, p[0]), p[1..])) else here
  }

  /** The mapping of a plan, built the way `solve_inner` builds it: the next state's, then the current zone. */
  function PlanMapping(s: State, p: seq<seq<Member>>): Mapping
    requires s.zones != [] && IsPlan(s, p)
    decreases |s.zones|
  {
    var rest := if CanNext(s) then PlanMapping(Next(s, p[0]), p[1..]) else map[];
    rest[CurrentZone(s) := p[0]]
  }

  /** Where a combination sits in the list the loop goes through. */
  lemma CombinationPosition(s: State, c: seq<Member>) returns (i: nat)
    requires c in MemberCombinations(s)
    ensures i < |MemberCombinations(s)| && MemberCombinations(s)[i] == c
  {
    i :| 0 <= i < |MemberCombinations(s)| && MemberCombinations(s)[i] == c;
  }

  /** The search is no worse than any branch the loop goes through. */
  lemma SearchBelowBranch(s: State, c: seq<Member>)
    requires s.zones != [] && c in MemberCombinations(s)
    ensures LessEq(Search(s).cost, Branch(s, c).cost)
  {
    var i := CombinationPosition(s, c);
    BestIsLeast(s, MemberCombinations(s));
  }

  /** A branch costs no more than a plan that starts with it, once the next state's search is no worse than the rest of the plan. */
  lemma BranchBelowPlan(s: State, p: seq<seq<Member>>)
    requires s.zones != [] && IsPlan(s, p)
    requires CanNext(s) ==> LessEq(Search(Next(s, p[0])).cost, PlanCost(Next(s, p[0]), p[1..]))
    ensures LessEq(Branch(s, p[0]).cost, PlanCost(s, p))
  {
    if CanNext(s) {
      var next := Next(s, p[0]);
      var here := ZoneCost(CurrentZone(s), p[0]);
      AddIsMonotone(Search(next).cost, PlanCost(next, p[1..]), here);
      assert LessEq(here.Add(Search(next).cost), here.Add(PlanCost(next, p[1..])));
    }
  }

  /** Optimality: no plan is cheaper than what the search returns. */
  lemma {:induction false} SearchIsOptimal(s: State, p: seq<seq<Member>>)
    requires s.zones != [] && IsPlan(s, p)
    ensures LessEq(Search(s).cost, PlanCost(s, p))
    decreases |s.zones|
  {
    if CanNext(s) {
      SearchIsOptimal(Next(s, p[0]), p[1..]);
    }
    BranchBelowPlan(s, p);
    SearchBelowBranch(s, p[0]);
    CostOrderIsTotal(Search(s).cost, Branch(s, p[0]).cost, PlanCost(s, p));
  }

  /** Adding anything to the sentinel cost gives no cost below it. */
  lemma AddToUnsolved(c: CalcResult)
    ensures !Less(c.Add(Unsolved.cost), Unsolved.cost)
  {
  }

  /**
    Unless the search found nothing, its result is a plan: the returned cost
    is that plan's cost and the returned mapping is that plan's mapping.
   */
  lemma {:induction false} SearchPlan(s: State) returns (p: seq<seq<Member>>)
    requires s.zones != [] && Search(s) != Unsolved
    ensures IsPlan(s, p)
    ensures PlanCost(s, p) == Search(s).cost
    ensures PlanMapping(s, p) == Search(s).mapping
    ensures Less(Search(s).cost, Unsolved.cost)
    decreases |s.zones|
  {
    var cs := MemberCombinations(s);
    var i := BestIsBranch(s, cs);
    var c := cs[i];
    assert c in cs;
    if CanNext(s) {
      var next := Next(s, c);
      var here := ZoneCost(CurrentZone(s), c);
      if Search(next) == Unsolved {
        AddToUnsolved(here);
        assert false;
      }
      var rest := SearchPlan(next);
      p := [c] + rest;
      assert p[1..] == rest;
    } else {
      p := [c];
    }
  }

  /** A plan cheaper than the sentinel means the search finds something, and it maps the current zone. */
  lemma SearchFindsPlan(s: State, p: seq<seq<Member>>)
    requires s.zones != [] && IsPlan(s, p) && Less(PlanCost(s, p), Unsolved.cost)
    ensures Search(s) != Unsolved
    ensures CurrentZone(s) in Search(s).mapping
  {
    SearchIsOptimal(s, p);
    CostOrderIsTotal(Search(s).cost, PlanCost(s, p), Unsolved.cost);
    var q := SearchPlan(s);
  }

  /** `C(n, k)` is positive when `k <= n`. */
  lemma {:induction false} BinomialPositive(n: nat, k: nat)
    requires k <= n
    ensures Binomial(n, k) >= 1
  {
    if k != 0 {
      BinomialPositive(n - 1, k - 1);
    }
  }

  /** With distinct members and at least three of them, there is a plan. */
  lemma {:induction false} PlanExists(s: State) returns (p: seq<seq<Member>>)
    requires s.zones != [] && Distinct(s.members) && |s.members| >= 3
    ensures IsPlan(s, p)
    decreases |s.zones|
  {
    var cs := MemberCombinations(s);
    CombinationsCount(s.members, 3);
    BinomialPositive(|s.members|, 3);
    var c := cs[0];
    assert c in cs;
    if CanNext(s) {
      NextOfCombination(s, c);
      var rest := PlanExists(Next(s, c));
      p := [c] + rest;
      assert p[1..] == rest;
    } else {
      p := [c];
    }
  }

  // ---------------------------------------------------------------------
  // What a plan, and so the returned mapping, looks like.
  // ---------------------------------------------------------------------

  /** A plan staffs at most as many zones as there are, and every combination is three members. */
  lemma {:induction false} PlanShape(s: State, p: seq<seq<Member>>)
    requires s.zones != [] && IsPlan(s, p)
    ensures |p| <= |s.zones|
    ensures forall i :: 0 <= i < |p| ==> |p[i]| == 3
    decreases |s.zones|
  {
    if CanNext(s) {
      var rest := p[1..];
      PlanShape(Next(s, p[0]), rest);
      forall i | 0 < i < |p| ensures |p[i]| == 3 {
        assert p[i] == rest[i - 1];
      }
    }
  }

  /** Every member a plan uses is one of the state's members. */
  lemma {:induction false} PlanMembers(s: State, p: seq<seq<Member>>)
    requires s.zones != [] && IsPlan(s, p)
    ensures forall i, x :: 0 <= i < |p| && x in p[i] ==> x in s.members
    decreases |s.zones|
  {
    var c := p[0];
    MemberCombinationsAreTriples(s, c);
    SubsequenceMultiset(c, s.members);
    forall x | x in c ensures x in s.members {
      assert x in multiset(c);
    }
    if CanNext(s) {
      var rest := p[1..];
      PlanMembers(Next(s, c), rest);
      forall i, x | 0 < i < |p| && x in p[i] ensures x in s.members {
        assert p[i] == rest[i - 1];
      }
    }
  }

  /** No member is in two combinations of a plan. */
  lemma {:induction false} PlanDisjoint(s: State, p: seq<seq<Member>>)
    requires s.zones != [] && IsPlan(s, p)
    ensures forall i, j, x :: 0 <= i < j < |p| && x in p[i] ==> x !in p[j]
    decreases |s.zones|
  {
    if CanNext(s) {
      var c, next, rest := p[0], Next(s, p[0]), p[1..];
      PlanDisjoint(next, rest);
      PlanMembers(next, rest);
      forall i, j, x | 0 <= i < j < |p| && x in p[i] ensures x !in p[j] {
        assert p[j] == rest[j - 1];
        if i > 0 {
          assert p[i] == rest[i - 1];
        }
      }
    }
  }

  /** With distinct members, every combination of a plan has distinct members. */
  lemma {:induction false} PlanDistinct(s: State, p: seq<seq<Member>>)
    requires s.zones != [] && IsPlan(s, p) && Distinct(s.members)
    ensures forall i :: 0 <= i < |p| ==> Distinct(p[i])
    decreases |s.zones|
  {
    CombinationIsDistinct(s, p[0]);
    if CanNext(s) {
      var rest := p[1..];
      NextOfCombination(s, p[0]);
      PlanDistinct(Next(s, p[0]), rest);
      forall i | 0 < i < |p| ensures Distinct(p[i]) {
        assert p[i] == rest[i - 1];
      }
    }
  }

  /**
    A plan staffs at most as many zones as there are; every combination is
    three of the state's members, and no member is in two combinations.
   */
  lemma PlanIsDisjoint(s: State, p: seq<seq<Member>>)
    requires s.zones != [] && IsPlan(s, p)
    ensures |p| <= |s.zones|
    ensures forall i :: 0 <= i < |p| ==> |p[i]| == 3
    ensures forall i, x :: 0 <= i < |p| && x in p[i] ==> x in s.members
    ensures forall i, j, x :: 0 <= i < j < |p| && x in p[i] ==> x !in p[j]
    ensures Distinct(s.members) ==> forall i :: 0 <= i < |p| ==> Distinct(p[i])
  {
    PlanShape(s, p);
    PlanMembers(s, p);
    PlanDisjoint(s, p);
    if Distinct(s.members) {
      PlanDistinct(s, p);
    }
  }

  /** No zone occurs twice (the mapping is keyed by zone, so two equal zones would share one entry). */
  predicate ZonesDistinct(zones: seq<Zone>)
  {
    forall i, j :: 0 <= i < j < |zones| ==> zones[i] != zones[j]
  }

  /** Dropping the first zone keeps the zones distinct. */
  lemma NextZonesDistinct(s: State, c: seq<Member>)
    requires s.zones != [] && ZonesDistinct(s.zones)
    ensures ZonesDistinct(Next(s, c).zones)
    ensures CurrentZone(s) !in Next(s, c).zones
  {
    var zs := Next(s, c).zones;
    forall i, j | 0 <= i < j < |zs| ensures zs[i] != zs[j] {
      assert zs[i] == s.zones[i + 1] && zs[j] == s.zones[j + 1];
    }
    forall i | 0 <= i < |zs| ensures zs[i] != CurrentZone(s) {
      assert zs[i] == s.zones[i + 1];
    }
  }

  /** A plan's mapping staffs exactly the first `|p|` zones. */
  lemma {:induction false} PlanMappingKeys(s: State, p: seq<seq<Member>>)
    requires s.zones != [] && IsPlan(s, p)
    ensures |p| <= |s.zones|
    ensures forall z :: z in PlanMapping(s, p) <==> z in s.zones[..|p|]
    decreases |s.zones|
  {
    PlanShape(s, p);
    var z0 := CurrentZone(s);
    if CanNext(s) {
      var next, rest := Next(s, p[0]), p[1..];
      PlanMappingKeys(next, rest);
      assert s.zones[..|p|] == [z0] + next.zones[..|rest|];
    } else {
      assert s.zones[..|p|] == [z0];
    }
  }

  /** With distinct zones, a plan's mapping sends the i-th zone to the i-th combination. */
  lemma {:induction false} PlanMappingShape(s: State, p: seq<seq<Member>>)
    requires s.zones != [] && IsPlan(s, p) && ZonesDistinct(s.zones)
    ensures |p| <= |s.zones|
    ensures forall z :: z in PlanMapping(s, p) <==> z in s.zones[..|p|]
    ensures forall i :: 0 <= i < |p| ==> PlanMapping(s, p)[s.zones[i]] == p[i]
    decreases |s.zones|
  {
    PlanMappingKeys(s, p);
    var m := PlanMapping(s, p);
    var z0 := CurrentZone(s);
    if CanNext(s) {
      var next, rest := Next(s, p[0]), p[1..];
      NextZonesDistinct(s, p[0]);
      PlanMappingShape(next, rest);
      forall i | 0 < i < |p| ensures m[s.zones[i]] == p[i] {
        assert s.zones[i] == next.zones[i - 1] && p[i] == rest[i - 1];
      }
    }
  }

  /**
    The cost of a mapping, recomputed from its entries: the zone cost of
    every zone of `zones` that the mapping staffs (with one to three members, as `calc` requires), added up.
   */
  function MappingCost(zones: seq<Zone>, m: Mapping): CalcResult
  {
    if zones == [] then NoCost
    else
      var here := if zones[0] in m && 1 <= |m[zones[0]]| <= 3 then ZoneCost(zones[0], m[zones[0]]) else NoCost;
      here.Add(MappingCost(zones[1..], m))
  }

  /** An entry for a zone that is not listed does not count. */
  lemma {:induction false} MappingCostIgnores(zones: seq<Zone>, m: Mapping, z: Zone, t: seq<Member>)
    requires z !in zones
    ensures MappingCost(zones, m[z := t]) == MappingCost(zones, m)
  {
    if zones != [] {
      MappingCostIgnores(zones[1..], m, z, t);
    }
  }

  /** Every entry of a plan's mapping is three members. */
  lemma {:induction false} PlanMappingTriples(s: State, p: seq<seq<Member>>)
    requires s.zones != [] && IsPlan(s, p)
    ensures forall z :: z in PlanMapping(s, p) ==> |PlanMapping(s, p)[z]| == 3
    decreases |s.zones|
  {
    if CanNext(s) {
      PlanMappingTriples(Next(s, p[0]), p[1..]);
    }
  }

  /** The cost of a mapping whose first listed zone was added last. */
  lemma MappingCostCons(zones: seq<Zone>, rest: Mapping, t: seq<Member>)
    requires zones != [] && zones[0] !in zones[1..] && 1 <= |t| <= 3
    ensures MappingCost(zones, rest[zones[0] := t]) == ZoneCost(zones[0], t).Add(MappingCost(zones[1..], rest))
  {
    MappingCostIgnores(zones[1..], rest, zones[0], t);
  }

  /** With distinct zones, the cost of a plan is recomputed from its mapping. */
  lemma {:induction false} PlanCostIsMappingCost(s: State, p: seq<seq<Member>>)
    requires s.zones != [] && IsPlan(s, p) && ZonesDistinct(s.zones)
    ensures PlanCost(s, p) == MappingCost(s.zones, PlanMapping(s, p))
    decreases |s.zones|
  {
    NextZonesDistinct(s, p[0]);
    var rest := map[];
    if CanNext(s) {
      var next := Next(s, p[0]);
      rest := PlanMapping(next, p[1..]);
      PlanCostIsMappingCost(next, p[1..]);
    } else {
      MappingCostOfUnstaffed(s.zones[1..], rest);
    }
    MappingCostCons(s.zones, rest, p[0]);
  }

  /** A mapping that staffs none of the listed zones costs nothing. */
  lemma {:induction false} MappingCostOfUnstaffed(zones: seq<Zone>, m: Mapping)
    requires forall z :: z in zones ==> z !in m
    ensures MappingCost(zones, m) == NoCost
  {
    if zones != [] {
      assert zones[0] !in m;
      MappingCostOfUnstaffed(zones[1..], m);
    }
  }

  /**
    The result is self-consistent: unless the search found nothing, the
    current zone is staffed, every staffed zone is one of the state's zones
    and gets three of its members, no member is in two zones, and (for
    distinct zones) recomputing the cost from the mapping gives the returned
    cost.
   */
  lemma SearchIsConsistent(s: State)
    requires s.zones != [] && Search(s) != Unsolved && ZonesDistinct(s.zones)
    ensures CurrentZone(s) in Search(s).mapping
    ensures forall z :: z in Search(s).mapping ==> z in s.zones && |Search(s).mapping[z]| == 3
    ensures forall z, x :: z in Search(s).mapping && x in Search(s).mapping[z] ==> x in s.members
    ensures forall z, y, x :: z in Search(s).mapping && y in Search(s).mapping && z != y && x in Search(s).mapping[z]
              ==> x !in Search(s).mapping[y]
    ensures Distinct(s.members) ==> forall z :: z in Search(s).mapping ==> Distinct(Search(s).mapping[z])
    ensures Search(s).cost == MappingCost(s.zones, Search(s).mapping)
  {
    var p := SearchPlan(s);
    PlanIsDisjoint(s, p);
    PlanMappingShape(s, p);
    PlanCostIsMappingCost(s, p);
    MappingFromPlan(s.zones, s.members, p, Search(s).mapping);
  }

  /** The facts about a plan, read off its mapping (which sends the i-th zone to the i-th combination). */
  lemma MappingFromPlan(zones: seq<Zone>, members: seq<Member>, p: seq<seq<Member>>, m: Mapping)
    requires 1 <= |p| <= |zones|
    requires forall z :: z in m <==> z in zones[..|p|]
    requires forall i :: 0 <= i < |p| ==> m[zones[i]] == p[i]
    requires forall i :: 0 <= i < |p| ==> |p[i]| == 3
    requires forall i, x :: 0 <= i < |p| && x in p[i] ==> x in members
    requires forall i, j, x :: 0 <= i < j < |p| && x in p[i] ==> x !in p[j]
    requires Distinct(members) ==> forall i :: 0 <= i < |p| ==> Distinct(p[i])
    ensures zones[0] in m
    ensures forall z :: z in m ==> z in zones && |m[z]| == 3
    ensures forall z, x :: z in m && x in m[z] ==> x in members
    ensures forall z, y, x :: z in m && y in m && z != y && x in m[z] ==> x !in m[y]
    ensures Distinct(members) ==> forall z :: z in m ==> Distinct(m[z])
  {
    forall z | z in m ensures exists i :: 0 <= i < |p| && z == zones[i] && m[z] == p[i] {
      var i :| 0 <= i < |p| && zones[..|p|][i] == z;
      assert z == zones[i];
    }
    assert zones[..|p|][0] == zones[0];
    forall z, y, x | z in m && y in m && z != y && x in m[z] ensures x !in m[y] {
      var i :| 0 <= i < |p| && z == zones[i] && m[z] == p[i];
      var j :| 0 <= j < |p| && y == zones[j] && m[y] == p[j];
      assert i != j;
    }
  }

  // ---------------------------------------------------------------------
  // The memo table and the search itself.
  // ---------------------------------------------------------------------

  /** The `HashMap<SolveState, SolveResult>` that `solve` creates and `solve_inner` fills. */
  class Cache {
    var entries: map<State, SolveResult>

    /** Every entry is what a fresh computation would give for its state. */
    ghost predicate Valid()
      reads this
    {
      forall k :: k in entries ==> k.zones != [] && entries[k] == Search(k)
    }

    constructor ()
      ensures Valid() && entries == map[]
    {
      entries := map[];
    }
  }

  /** One more turn of the loop. */
  lemma BestStep(s: State, cs: seq<seq<Member>>, i: nat)
    requires s.zones != [] && AllTriples(cs) && i < |cs|
    ensures Best(s, cs[..i + 1]) == Step(s, Best(s, cs[..i]), cs[i])
  {
    assert cs[..i + 1][..i] == cs[..i];
    assert cs[..i + 1][i] == cs[i];
  }

  /**
    `solve_inner`: a cache hit is returned as it is; otherwise every
    combination is tried for the current zone, the best result is stored
    under `state` and returned.
   */
  method SolveInner(state: State, cache: Cache) returns (r: SolveResult)
    requires state.zones != [] && cache.Valid()
    modifies cache
    ensures cache.Valid()
    ensures r == Search(state)
    ensures state in cache.entries
    ensures forall k :: k in old(cache.entries) ==> k in cache.entries
    decreases |state.zones|
  {
    if state in cache.entries {
      return cache.entries[state];
    }
    ghost var before := cache.entries;
    var combinations := MemberCombinations(state);
    var minResult := Unsolved;
    for i := 0 to |combinations|
      invariant cache.Valid()
      invariant minResult == Best(state, combinations[..i])
      invariant forall k :: k in before ==> k in cache.entries
    {
      var members := combinations[i];
      BestStep(state, combinations, i);
      var result := Calc(CurrentZone(state), members);
      if LessEq(minResult.cost, result) {
        continue;
      }
      var zones: Mapping := map[];
      if CanNext(state) {
        var next := SolveInner(Next(state, members), cache);
        result := result.Add(next.cost);
        zones := next.mapping;
      }
      assert Branch(state, members) == SolveResult(result, zones[CurrentZone(state) := members]);
      if Less(result, minResult.cost) {
        zones := zones[CurrentZone(state) := members];
        minResult := SolveResult(result, zones);
      }
    }
    assert combinations[..|combinations|] == combinations;
    cache.entries := cache.entries[state := minResult];
    r := minResult;
  }

  /**
    `solve`: nothing for fewer than three members or no zone; otherwise the
    search from the members and zones as given, with a fresh cache.
   */
  method Solve(members: seq<Member>, zones: seq<Zone>) returns (r: Option<SolveResult>)
    ensures r.None? <==> |members| < 3 || zones == []
    ensures r.Some? ==> r.value == Search(State(members, zones))
  {
    if |members| < 3 || zones == [] {
      return None;
    }
    var cache := new Cache();
    var result := SolveInner(State(members, zones), cache);
    return Some(result);
  }
}
